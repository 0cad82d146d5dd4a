/** Git commit objects: the text the exporter writes and the fields the importer reads from it. */
module CommitCodec {
  import opened Basics
  import opened Text
  import Decimal

  type int64 = x: int | MIN_INT64 <= x <= MAX_INT64

  /** Times are whole seconds since 1970. */
  datatype Author = Author(name: string, email: string, seconds: int64)

  /** The zero time, as in a record nothing was stored in. */
  const ZERO_TIME: int64 := -62135596800

  const NOBODY: Author := Author("", "", ZERO_TIME)

  datatype CommitData = CommitData(
    tree: string,
    parents: seq<string>,
    author: Author,
    committer: Author,
    message: string)

  /** `Panic`: the importer slices a string with a start after the end. */
  datatype Outcome<+T> = Panic | Value(value: T)

  // -------------------------------------------------------------------------- writing

  const ZONE: string := " +0000"

  function Stamp(seconds: int64): string {
    [' '] + Decimal.Show(seconds) + ZONE
  }

  function Signature(a: Author): string {
    a.name + [' ', '<'] + a.email + ['>'] + Stamp(a.seconds)
  }

  predicate EndsLine(s: string) {
    s != "" && s[|s| - 1] == '\n'
  }

  /** The message with a line end added where it has none. */
  function Body(message: string): string {
    if EndsLine(message) then message else message + ['\n']
  }

  function Keyed(key: string, rest: string): string {
    key + [' '] + rest
  }

  function Header(tree: string, a: Author): seq<string> {
    [Keyed("tree", tree), Keyed("author", Signature(a)), Keyed("committer", Signature(a)), []]
  }

  /** The text of an exported commit: header lines, an empty line and the message. */
  function Exported(tree: string, a: Author, message: string): string {
    Lines(Header(tree, a)) + Body(message)
  }

  method ExportCommit(tree: string, a: Author, message: string) returns (content: string)
    ensures content == Exported(tree, a, message)
  {
    var signature := Signature(a);
    content := Headed("tree", tree, "author", "committer", signature);
    content := content + message;
    if !EndsLine(message) {
      Assoc(Lines(Header(tree, a)), message, ['\n']);
      content := content + ['\n'];
    }
  }

  /** Writes the header to an empty buffer. */
  method Headed(treeKey: string, tree: string, authorKey: string, committerKey: string,
                signature: string) returns (content: string)
    ensures content == Lines([Keyed(treeKey, tree), Keyed(authorKey, signature),
                              Keyed(committerKey, signature), []])
  {
    ghost var a, b, c := Keyed(treeKey, tree), Keyed(authorKey, signature),
                         Keyed(committerKey, signature);
    content := [];
    LinesSnoc([], a);
    content := content + (Keyed(treeKey, tree) + ['\n']);
    LinesSnoc([a], b);
    content := content + (Keyed(authorKey, signature) + ['\n']);
    LinesSnoc([a, b], c);
    content := content + (Keyed(committerKey, signature) + ['\n']);
    LinesSnoc([a, b, c], []);
    content := content + ([] + ['\n']);
    assert [] + [a] == [a] && [a] + [b] == [a, b] && [a, b] + [c] == [a, b, c];
    assert [a, b, c] + [[]] == [a, b, c, []];
  }

  // -------------------------------------------------------------------------- reading

  /** `now` is the clock, which stands in for a time that cannot be read. */
  function ParseAuthor(line: string, now: int64): Outcome<Author> {
    if |Split(line, ' ')| < 3 then Value(NOBODY)
    else
      var emailStart, emailEnd := Index(line, '<'), Index(line, '>');
      if emailStart == |line| || emailEnd == |line| then Value(NOBODY)
      else if emailEnd < emailStart + 1 then Panic
      else Value(AuthorAt(line, emailStart, emailEnd, now))
  }

  function AuthorAt(line: string, emailStart: nat, emailEnd: nat, now: int64): Author
    requires emailStart < emailEnd < |line|
  {
    Author(Trim(line[..emailStart]), line[emailStart + 1..emailEnd],
           ParseStamp(line[emailEnd + 1..], now))
  }

  function ParseStamp(s: string, now: int64): int64 {
    match ParseInt(Split(Trim(s), ' ')[0])
    case Some(seconds) => if MIN_INT64 <= seconds <= MAX_INT64 then seconds else now
    case None => now
  }

  datatype Key = TreeKey | ParentKey | AuthorKey | CommitterKey | OtherKey

  function KeyOf(key: string): Key {
    if key == "tree" then TreeKey
    else if key == "parent" then ParentKey
    else if key == "author" then AuthorKey
    else if key == "committer" then CommitterKey
    else OtherKey
  }

  datatype Reading = Reading(data: CommitData, inMessage: bool)

  const START: Reading := Reading(CommitData("", [], NOBODY, NOBODY, ""), false)

  function StoreField(r: Reading, key: Key, rest: string, parsed: Outcome<Author>):
    Outcome<Reading>
  {
    var d := r.data;
    match key
    case TreeKey => Value(r.(data := d.(tree := rest)))
    case ParentKey => Value(r.(data := d.(parents := d.parents + [rest])))
    case AuthorKey =>
      if parsed.Panic? then Panic else Value(r.(data := d.(author := parsed.value)))
    case CommitterKey =>
      if parsed.Panic? then Panic else Value(r.(data := d.(committer := parsed.value)))
    case OtherKey => Value(r)
  }

  function ReadField(r: Reading, key: Key, rest: string, now: int64): Outcome<Reading> {
    StoreField(r, key, rest, ParseAuthor(rest, now))
  }

  function ReadLine(r: Reading, line: string, now: int64): Outcome<Reading> {
    if r.inMessage then
      Value(r.(data := r.data.(message := r.data.message + line + ['\n'])))
    else if line == [] then Value(r.(inMessage := true))
    else
      var space := Index(line, ' ');
      if space == |line| then Value(r)
      else ReadField(r, KeyOf(line[..space]), line[space + 1..], now)
  }

  function ReadLines(r: Reading, lines: seq<string>, now: int64): Outcome<Reading>
    decreases |lines|
  {
    if lines == [] then Value(r)
    else
      match ReadLine(r, lines[0], now)
      case Panic => Panic
      case Value(r') => ReadLines(r', lines[1..], now)
  }

  function Finish(r: Outcome<Reading>): Outcome<CommitData> {
    match r
    case Panic => Panic
    case Value(r) => Value(r.data.(message := Trim(r.data.message)))
  }

  function Import(content: string, now: int64): Outcome<CommitData> {
    Finish(ReadLines(START, Split(content, '\n'), now))
  }

  method ImportCommit(content: string, now: int64) returns (result: Outcome<CommitData>)
    ensures result == Import(content, now)
  {
    var lines := Split(content, '\n');
    var r := START;
    var i := 0;
    while i < |lines|
      invariant 0 <= i <= |lines|
      invariant ReadLines(START, lines, now) == ReadLines(r, lines[i..], now)
    {
      assert lines[i..][0] == lines[i] && lines[i..][1..] == lines[i + 1..];
      var next := ReadLine(r, lines[i], now);
      if next.Panic? {
        return Panic;
      }
      r := next.value;
      i := i + 1;
    }
    result := Value(r.data.(message := Trim(r.data.message)));
  }

  // ----------------------------------------------------------- what reading can produce

  /** An author whose line can be read back. */
  predicate Readable(a: Author) {
    && Trim(a.name) == a.name
    && '<' !in a.name && '>' !in a.name && '\n' !in a.name
    && '>' !in a.email && '\n' !in a.email
  }

  lemma ParsedAuthorReadable(line: string, now: int64)
    requires '\n' !in line
    ensures ParseAuthor(line, now).Value? ==> Readable(ParseAuthor(line, now).value)
  {
    var start, end := Index(line, '<'), Index(line, '>');
    IndexIsFirst(line, '<');
    IndexIsFirst(line, '>');
    if start < end < |line| {
      AuthorAtReadable(line, start, end, now);
    }
  }

  lemma AuthorAtReadable(line: string, start: nat, end: nat, now: int64)
    requires '\n' !in line && start < end < |line|
    requires '<' !in line[..start] && '>' !in line[..end]
    ensures Readable(AuthorAt(line, start, end, now))
  {
    var front := line[..start];
    TrimTrimmed(front);
    assert forall c | c in front :: c in line[..end] && c in line;
    assert forall c | c in line[start + 1..end] :: c in line[..end] && c in line;
  }

  predicate Sound(d: CommitData) {
    && '\n' !in d.tree && (forall p | p in d.parents :: '\n' !in p)
    && Readable(d.author) && Readable(d.committer)
  }

  lemma ReadLineSound(r: Reading, line: string, now: int64)
    requires Sound(r.data) && '\n' !in line
    ensures ReadLine(r, line, now).Value? ==> Sound(ReadLine(r, line, now).value.data)
  {
    var space := Index(line, ' ');
    if space < |line| {
      ReadFieldSound(r, KeyOf(line[..space]), line[space + 1..], now);
    }
  }

  lemma ReadFieldSound(r: Reading, key: Key, rest: string, now: int64)
    requires Sound(r.data) && '\n' !in rest
    ensures var r' := ReadField(r, key, rest, now);
            r'.Value? ==> Sound(r'.value.data)
  {
    ParsedAuthorReadable(rest, now);
    StoreFieldSound(r, key, rest, ParseAuthor(rest, now));
  }

  lemma StoreFieldSound(r: Reading, key: Key, rest: string, parsed: Outcome<Author>)
    requires Sound(r.data) && '\n' !in rest && (parsed.Value? ==> Readable(parsed.value))
    ensures var r' := StoreField(r, key, rest, parsed);
            r'.Value? ==> Sound(r'.value.data)
  {
  }

  lemma {:induction false} ReadLinesSound(r: Reading, lines: seq<string>, now: int64)
    requires Sound(r.data) && forall line | line in lines :: '\n' !in line
    ensures ReadLines(r, lines, now).Value? ==> Sound(ReadLines(r, lines, now).value.data)
    decreases |lines|
  {
    if lines != [] {
      ReadLineSound(r, lines[0], now);
      if ReadLine(r, lines[0], now).Value? {
        ReadLinesSound(ReadLine(r, lines[0], now).value, lines[1..], now);
      }
    }
  }

  lemma ImportSound(content: string, now: int64)
    ensures Import(content, now).Value? ==> Sound(Import(content, now).value)
  {
    SplitPieces(content, '\n');
    ReadLinesSound(START, Split(content, '\n'), now);
  }

  // ------------------------------------------------------------------------ round trip

  lemma PartsFound(name: string, email: string, stamp: string)
    requires '<' !in name && '>' !in name && '>' !in email
    ensures var line := name + [' ', '<'] + email + ['>'] + stamp;
            var start, end := |name| + 1, |name| + 2 + |email|;
            && Index(line, '<') == start && Index(line, '>') == end
            && line[..start] == name + [' ']
            && line[start + 1..end] == email
            && line[end + 1..] == stamp
  {
    var line := name + [' ', '<'] + email + ['>'] + stamp;
    var before, after := name + [' '], email + ['>'] + stamp;
    assert line == before + ['<'] + after;
    IndexAfter(before, '<', after);
    var front := name + [' ', '<'] + email;
    assert line == front + ['>'] + stamp;
    IndexAfter(front, '>', stamp);
  }

  /** A name, an email and a stamp, put together and taken apart again. */
  lemma ParseParts(a: Author, stamp: string, now: int64)
    requires Readable(a)
    requires |Split(a.name + [' ', '<'] + a.email + ['>'] + stamp, ' ')| >= 3
    ensures ParseAuthor(a.name + [' ', '<'] + a.email + ['>'] + stamp, now) ==
            Value(Author(a.name, a.email, ParseStamp(stamp, now)))
  {
    var line := a.name + [' ', '<'] + a.email + ['>'] + stamp;
    var start, end := |a.name| + 1, |a.name| + 2 + |a.email|;
    PartsFound(a.name, a.email, stamp);
    TrimTrailing(a.name, ' ');
    ParseWhole(line, start, end, a, stamp, now);
  }

  lemma ParseWhole(line: string, start: nat, end: nat, a: Author, stamp: string, now: int64)
    requires |Split(line, ' ')| >= 3 && start == Index(line, '<') && end == Index(line, '>')
    requires start < end < |line| && Trim(line[..start]) == a.name
    requires line[start + 1..end] == a.email && line[end + 1..] == stamp
    ensures ParseAuthor(line, now) == Value(Author(a.name, a.email, ParseStamp(stamp, now)))
  {
    ParseFound(line, start, end, now);
    AuthorIs(line, start, end, a, stamp, now);
  }

  lemma AuthorIs(line: string, start: nat, end: nat, a: Author, stamp: string, now: int64)
    requires start < end < |line| && Trim(line[..start]) == a.name
    requires line[start + 1..end] == a.email && line[end + 1..] == stamp
    ensures AuthorAt(line, start, end, now) == Author(a.name, a.email, ParseStamp(stamp, now))
  {
  }

  lemma ParseFound(line: string, start: nat, end: nat, now: int64)
    requires |Split(line, ' ')| >= 3 && start == Index(line, '<') && end == Index(line, '>')
    requires start < end < |line|
    ensures ParseAuthor(line, now) == Value(AuthorAt(line, start, end, now))
  {
  }

  lemma ThreePieces(a: string, b: string, c: string)
    ensures |Split(a + [' '] + b + [' '] + c, ' ')| >= 3
  {
    assert a + [' '] + b + [' '] + c == a + [' '] + (b + [' '] + c);
    SplitCount(a, ' ', b + [' '] + c);
    SplitCount(b, ' ', c);
  }

  lemma StampRead(n: int64, now: int64)
    ensures ParseStamp(Stamp(n), now) == n
  {
    ShownChars(n);
    StampParts(Decimal.Show(n), ZONE, now);
    ParseShown(n);
  }

  lemma StampParts(shown: string, zone: string, now: int64)
    requires shown != [] && !IsSpace(shown[0]) && ' ' !in shown
    requires |zone| >= 2 && zone[0] == ' ' && !IsSpace(zone[|zone| - 1])
    ensures Split(Trim([' '] + shown + zone), ' ')[0] == shown
  {
    var rest := zone[1..];
    assert [' '] + shown + zone == [' '] + (shown + [' '] + rest);
    TrimStamp(shown, rest);
    SplitFirst(shown, ' ', rest);
  }

  lemma TrimStamp(shown: string, zone: string)
    requires shown != [] && !IsSpace(shown[0]) && zone != [] && !IsSpace(zone[|zone| - 1])
    ensures Trim([' '] + (shown + [' '] + zone)) == shown + [' '] + zone
  {
    var t := shown + [' '] + zone;
    assert t[0] == shown[0] && t[|t| - 1] == zone[|zone| - 1];
    TrimLeading(t);
  }

  lemma TrimLeading(t: string)
    requires t != [] && !IsSpace(t[0]) && !IsSpace(t[|t| - 1])
    ensures Trim([' '] + t) == t
  {
    var s := [' '] + t;
    assert s[|s| - 1] == t[|t| - 1];
    assert TrimRight(s) == s;
    assert s[1..] == t;
    assert TrimLeft(s) == TrimLeft(t) == t;
  }

  lemma ParseSignature(a: Author, now: int64)
    requires Readable(a)
    ensures ParseAuthor(Signature(a), now) == Value(a)
  {
    var stamp := Stamp(a.seconds);
    StampRead(a.seconds, now);
    SignaturePieces(a, stamp);
    ParseParts(a, stamp, now);
  }

  lemma SignaturePieces(a: Author, stamp: string)
    requires stamp != [] && stamp[0] == ' '
    ensures |Split(a.name + [' ', '<'] + a.email + ['>'] + stamp, ' ')| >= 3
  {
    var mid := ['<'] + a.email + ['>'];
    ThreePieces(a.name, mid, stamp[1..]);
    assert a.name + [' ', '<'] + a.email + ['>'] + stamp == a.name + [' '] + mid + [' '] + stamp[1..];
  }

  lemma ReadKeyed(r: Reading, key: string, rest: string, now: int64)
    requires !r.inMessage && ' ' !in key
    ensures ReadLine(r, Keyed(key, rest), now) == ReadField(r, KeyOf(key), rest, now)
  {
    var line := Keyed(key, rest);
    IndexAfter(key, ' ', rest);
    assert line[..|key|] == key && line[|key| + 1..] == rest;
  }

  lemma ReadFour(r: Reading, a: string, b: string, c: string, d: string, rest: seq<string>,
                 r1: Reading, r2: Reading, r3: Reading, r4: Reading, now: int64)
    requires ReadLine(r, a, now) == Value(r1) && ReadLine(r1, b, now) == Value(r2)
    requires ReadLine(r2, c, now) == Value(r3) && ReadLine(r3, d, now) == Value(r4)
    ensures ReadLines(r, [a, b, c, d] + rest, now) == ReadLines(r4, rest, now)
  {
    var all := [a, b, c, d] + rest;
    assert all[1..] == [b, c, d] + rest;
    assert all[1..][1..] == [c, d] + rest;
    assert all[1..][1..][1..] == [d] + rest;
    assert all[1..][1..][1..][1..] == rest;
    assert ReadLines(r3, [d] + rest, now) == ReadLines(r4, rest, now);
    assert ReadLines(r2, [c, d] + rest, now) == ReadLines(r3, [d] + rest, now);
    assert ReadLines(r1, [b, c, d] + rest, now) == ReadLines(r2, [c, d] + rest, now);
  }

  lemma ReadHeader(treeKey: string, tree: string, authorKey: string, committerKey: string,
                   a: Author, rest: seq<string>, now: int64)
    requires ' ' !in treeKey && ' ' !in authorKey && ' ' !in committerKey
    requires KeyOf(treeKey) == TreeKey
    requires KeyOf(authorKey) == AuthorKey && KeyOf(committerKey) == CommitterKey
    requires Readable(a)
    ensures ReadLines(START, [Keyed(treeKey, tree), Keyed(authorKey, Signature(a)),
                              Keyed(committerKey, Signature(a)), []] + rest, now) ==
            ReadLines(Reading(CommitData(tree, [], a, a, []), true), rest, now)
  {
    var r1 := Reading(CommitData(tree, [], NOBODY, NOBODY, []), false);
    var r2 := Reading(CommitData(tree, [], a, NOBODY, []), false);
    var r3 := Reading(CommitData(tree, [], a, a, []), false);
    ReadKeyed(START, treeKey, tree, now);
    ParseSignature(a, now);
    ReadKeyed(r1, authorKey, Signature(a), now);
    ReadKeyed(r2, committerKey, Signature(a), now);
    ReadFour(START, Keyed(treeKey, tree), Keyed(authorKey, Signature(a)),
             Keyed(committerKey, Signature(a)), [], rest, r1, r2, r3, r3.(inMessage := true), now);
  }

  lemma {:induction false} ReadMessage(r: Reading, lines: seq<string>, now: int64)
    requires r.inMessage
    ensures ReadLines(r, lines, now) ==
            Value(r.(data := r.data.(message := r.data.message + Lines(lines))))
    decreases |lines|
  {
    if lines == [] {
      assert r.data.message + [] == r.data.message;
    } else {
      var r' := ReadLine(r, lines[0], now).value;
      ReadMessage(r', lines[1..], now);
      assert r.data.message + lines[0] + ['\n'] + Lines(lines[1..])
          == r.data.message + (lines[0] + ['\n'] + Lines(lines[1..]));
    }
  }

  lemma SignatureOneLine(a: Author)
    requires '\n' !in a.name && '\n' !in a.email
    ensures '\n' !in Signature(a)
  {
    ShownChars(a.seconds);
    assert '\n' !in ZONE;
    assert '\n' !in Stamp(a.seconds);
  }

  lemma KeyedOneLine(key: string, rest: string)
    requires '\n' !in key && '\n' !in rest
    ensures '\n' !in Keyed(key, rest)
  {
  }

  lemma HeaderOneLiners(tree: string, a: Author)
    requires '\n' !in tree && '\n' !in a.name && '\n' !in a.email
    ensures forall line | line in Header(tree, a) :: '\n' !in line
  {
    SignatureOneLine(a);
    KeyedOneLine("tree", tree);
    KeyedOneLine("author", Signature(a));
    KeyedOneLine("committer", Signature(a));
  }

  lemma ImportExported(tree: string, a: Author, message: string, now: int64)
    requires '\n' !in tree && Readable(a)
    ensures Import(Exported(tree, a, message), now) ==
            Value(CommitData(tree, [], a, a, Trim(message)))
  {
    var body := Body(message);
    HeaderOneLiners(tree, a);
    SplitLines(Header(tree, a), body);
    ReadHeader("tree", tree, "author", "committer", a, Split(body, '\n'), now);
    ReadMessage(Reading(CommitData(tree, [], a, a, []), true), Split(body, '\n'), now);
    LinesOfSplit(body);
    TrimBody(message);
  }

  lemma TrimBody(message: string)
    ensures Trim([] + (Body(message) + ['\n'])) == Trim(message)
  {
    assert [] + (Body(message) + ['\n']) == Body(message) + ['\n'];
    TrimTrailing(Body(message), '\n');
    if !EndsLine(message) {
      TrimTrailing(message, '\n');
    }
  }

  /** Reading an exported commit gives back its tree, its author in both roles and its trimmed
      message, whatever the message is, if and only if the tree holds no line end and the author
      is readable. */
  lemma RoundTripIff(tree: string, a: Author, message: string, now: int64)
    ensures Import(Exported(tree, a, message), now) ==
            Value(CommitData(tree, [], a, a, Trim(message)))
            <==> '\n' !in tree && Readable(a)
  {
    if '\n' !in tree && Readable(a) {
      ImportExported(tree, a, message, now);
    } else {
      ImportSound(Exported(tree, a, message), now);
    }
  }

  // ------------------------------------------------------------- texts that cannot be read

  /** The line has three pieces or more, and the first `>` comes before the first `<`. */
  predicate Crossed(line: string) {
    |Split(line, ' ')| >= 3 && Index(line, '>') < Index(line, '<') < |line|
  }

  lemma AuthorPanicsIff(line: string, now: int64)
    ensures ParseAuthor(line, now).Panic? <==> Crossed(line)
  {
    IndexIsFirst(line, '<');
    IndexIsFirst(line, '>');
  }

  /** A header line with an author that cannot be read. */
  predicate BadLine(line: string) {
    var space := Index(line, ' ');
    && space < |line|
    && (KeyOf(line[..space]) == AuthorKey || KeyOf(line[..space]) == CommitterKey)
    && Crossed(line[space + 1..])
  }

  lemma LinePanicsIff(r: Reading, line: string, now: int64)
    requires !r.inMessage
    ensures ReadLine(r, line, now).Panic? <==> BadLine(line)
    ensures line != [] && !BadLine(line) ==> !ReadLine(r, line, now).value.inMessage
  {
    var space := Index(line, ' ');
    if space < |line| {
      AuthorPanicsIff(line[space + 1..], now);
    }
  }

  /** A bad line stands before the first empty one. */
  predicate BadHeader(lines: seq<string>) {
    exists i | 0 <= i < |lines| :: BadLine(lines[i]) && [] !in lines[..i]
  }

  lemma BadHeaderCons(first: string, rest: seq<string>)
    ensures BadHeader([first] + rest) <==> BadLine(first) || (first != [] && BadHeader(rest))
  {
    var all := [first] + rest;
    if BadHeader(all) && !BadLine(first) {
      var i :| 0 <= i < |all| && BadLine(all[i]) && [] !in all[..i];
      assert all[..i] == [first] + rest[..i - 1];
      assert rest[i - 1] == all[i];
    }
    if BadLine(first) {
      assert all[0] == first && all[..0] == [];
    } else if first != [] && BadHeader(rest) {
      var i :| 0 <= i < |rest| && BadLine(rest[i]) && [] !in rest[..i];
      assert all[i + 1] == rest[i] && all[..i + 1] == [first] + rest[..i];
    }
  }

  lemma {:induction false} LinesPanicIff(r: Reading, lines: seq<string>, now: int64)
    requires !r.inMessage
    ensures ReadLines(r, lines, now).Panic? <==> BadHeader(lines)
    decreases |lines|
  {
    if lines != [] {
      var first, rest := lines[0], lines[1..];
      assert lines == [first] + rest;
      BadHeaderCons(first, rest);
      LinePanicsIff(r, first, now);
      if first == [] {
        ReadMessage(r.(inMessage := true), rest, now);
      } else if !BadLine(first) {
        LinesPanicIff(ReadLine(r, first, now).value, rest, now);
      }
    }
  }

  /** Reading a commit panics if and only if some line before the first empty one names an author
      or committer in whose line the first `>` comes before the first `<`. */
  lemma ImportPanicsIff(content: string, now: int64)
    ensures Import(content, now).Panic? <==> BadHeader(Split(content, '\n'))
  {
    LinesPanicIff(START, Split(content, '\n'), now);
  }

  lemma BadKeyed(key: string, rest: string)
    requires ' ' !in key
    ensures BadLine(Keyed(key, rest)) <==>
            (KeyOf(key) == AuthorKey || KeyOf(key) == CommitterKey) && Crossed(rest)
  {
    var line := Keyed(key, rest);
    IndexAfter(key, ' ', rest);
    assert line[..|key|] == key && line[|key| + 1..] == rest;
  }

  lemma BadHeaderLines(a: string, b: string, c: string, rest: seq<string>)
    requires a != [] && b != [] && c != [] && !BadLine(a) && (BadLine(b) <==> BadLine(c))
    ensures BadHeader([a, b, c, []] + rest) <==> BadLine(b)
  {
    assert [a, b, c, []] + rest == [a] + ([b] + ([c] + ([[]] + rest)));
    BadHeaderCons(a, [b] + ([c] + ([[]] + rest)));
    BadHeaderCons(b, [c] + ([[]] + rest));
    BadHeaderCons(c, [[]] + rest);
    BadHeaderCons([], rest);
  }

  /** What follows the name opens its bracket before it closes one. */
  lemma FirstBrackets(name: string, rest: string, line: string)
    requires line == name + rest && Index(rest, '<') == 1 < |rest| && Index(rest, '>') >= 2
    ensures Index(line, '>') < Index(line, '<') < |line| <==> Index(name, '>') < Index(name, '<')
  {
    IndexJoin(name, rest, '<');
    IndexJoin(name, rest, '>');
  }

  lemma OpensFirst(tail: string)
    ensures Index([' ', '<'] + tail, '<') == 1 && Index([' ', '<'] + tail, '>') >= 2
  {
    IndexJoin([' ', '<'], tail, '<');
    IndexJoin([' ', '<'], tail, '>');
  }

  lemma Grouped(a: string, b: string, c: string, d: string, e: string)
    ensures a + b + c + d + e == a + (b + (c + d + e))
  {
    Assoc(a + b, c, d);
    Assoc(a + b, c + d, e);
    Assoc(a, b, c + d + e);
  }

  lemma CrossedSignature(a: Author)
    ensures Crossed(Signature(a)) <==> Index(a.name, '>') < Index(a.name, '<')
  {
    var tail := a.email + ['>'] + Stamp(a.seconds);
    SignaturePieces(a, Stamp(a.seconds));
    OpensFirst(tail);
    Grouped(a.name, [' ', '<'], a.email, ['>'], Stamp(a.seconds));
    FirstBrackets(a.name, [' ', '<'] + tail, Signature(a));
  }

  /** A one-line commit that was exported cannot be imported if and only if its author's name holds
      a `>` with no `<` before it. */
  lemma ExportedPanicsIff(tree: string, a: Author, message: string, now: int64)
    requires '\n' !in tree && '\n' !in a.name && '\n' !in a.email
    ensures Import(Exported(tree, a, message), now).Panic?
            <==> Index(a.name, '>') < Index(a.name, '<')
  {
    HeaderOneLiners(tree, a);
    SplitLines(Header(tree, a), Body(message));
    ImportPanicsIff(Exported(tree, a, message), now);
    BadKeyed("tree", tree);
    BadKeyed("author", Signature(a));
    BadKeyed("committer", Signature(a));
    BadHeaderLines(Keyed("tree", tree), Keyed("author", Signature(a)),
                   Keyed("committer", Signature(a)), Split(Body(message), '\n'));
    CrossedSignature(a);
  }

  /** A commit by an author called `>`. */
  lemma ImporterPanics(now: int64)
    ensures Import(Exported("t", Author(">", "e", 0), "m"), now).Panic?
  {
    ExportedPanicsIff("t", Author(">", "e", 0), "m", now);
    assert Index(">", '>') == 0 && Index(">", '<') == 1;
  }
}

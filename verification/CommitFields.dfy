/** What the importer takes from the text of a commit, said line by line and without its loop, and
    commits with parents and with a committer of their own. */
module CommitFields {
  import opened Basics
  import opened Text
  import opened CommitCodec
  import Decimal

  // ------------------------------------------------------------------------ the reference

  /** What follows the key and a space, if the line starts with them. */
  function Field(line: string, key: string): seq<string> {
    if key + [' '] <= line then [line[|key| + 1..]] else []
  }

  function Fields(lines: seq<string>, key: string): seq<string> {
    if lines == [] then [] else Field(lines[0], key) + Fields(lines[1..], key)
  }

  /** The lines before the first empty one. */
  function HeaderOf(lines: seq<string>): seq<string> {
    lines[..Index(lines, [])]
  }

  /** The lines after the first empty one. */
  function BodyOf(lines: seq<string>): seq<string> {
    var i := Index(lines, []);
    if i < |lines| then lines[i + 1..] else []
  }

  function LastOr<T>(s: seq<T>, otherwise: T): T {
    if s == [] then otherwise else s[|s| - 1]
  }

  function AuthorOr(fields: seq<string>, otherwise: Author, now: int64): Author {
    if fields == [] then otherwise
    else
      match ParseAuthor(fields[|fields| - 1], now)
      case Value(a) => a
      case Panic => NOBODY
  }

  /** The commit with fields stored on top of what is there. */
  function With(d: CommitData, trees: seq<string>, parents: seq<string>, authors: seq<string>,
                committers: seq<string>, now: int64): CommitData
  {
    CommitData(LastOr(trees, d.tree), d.parents + parents, AuthorOr(authors, d.author, now),
               AuthorOr(committers, d.committer, now), d.message)
  }

  function Filled(d: CommitData, header: seq<string>, now: int64): CommitData {
    With(d, Fields(header, "tree"), Fields(header, "parent"), Fields(header, "author"),
         Fields(header, "committer"), now)
  }

  // ------------------------------------------------------------------------ one line

  lemma StartsWithKey(line: string, key: string)
    requires ' ' !in key && key + [' '] <= line
    ensures Index(line, ' ') == |key| < |line| && line[..|key|] == key
  {
    var rest := line[|key| + 1..];
    IndexAfter(key, ' ', rest);
    assert line == key + [' '] + rest;
  }

  lemma KeyStarts(line: string, k: nat)
    requires k < |line| && line[k] == ' '
    ensures line[..k] + [' '] <= line
  {
    assert line[..k] + [line[k]] == line[..k + 1];
  }

  /** The key of a line is what comes before its first space. */
  lemma FieldByKey(line: string, key: string)
    requires ' ' !in key
    ensures var space := Index(line, ' ');
            Field(line, key) ==
            if space < |line| && line[..space] == key then [line[space + 1..]] else []
  {
    if key + [' '] <= line {
      StartsWithKey(line, key);
    } else if Index(line, ' ') < |line| && line[..Index(line, ' ')] == key {
      IndexIsFirst(line, ' ');
      KeyStarts(line, Index(line, ' '));
    }
  }

  function If(b: bool, rest: string): seq<string> {
    if b then [rest] else []
  }

  lemma FieldIf(line: string, key: string, has: bool)
    requires ' ' !in key && Index(line, ' ') < |line|
    requires has <==> line[..Index(line, ' ')] == key
    ensures Field(line, key) == If(has, line[Index(line, ' ') + 1..])
  {
    FieldByKey(line, key);
  }

  lemma KeysApart(key: string)
    ensures KeyOf(key) == TreeKey <==> key == "tree"
    ensures KeyOf(key) == ParentKey <==> key == "parent"
    ensures KeyOf(key) == AuthorKey <==> key == "author"
    ensures KeyOf(key) == CommitterKey <==> key == "committer"
  {
  }

  lemma TreeField(line: string)
    requires Index(line, ' ') < |line|
    ensures Field(line, "tree") ==
            If(KeyOf(line[..Index(line, ' ')]) == TreeKey, line[Index(line, ' ') + 1..])
  {
    var key := line[..Index(line, ' ')];
    KeysApart(key);
    FieldIf(line, "tree", KeyOf(key) == TreeKey);
  }

  lemma ParentField(line: string)
    requires Index(line, ' ') < |line|
    ensures Field(line, "parent") ==
            If(KeyOf(line[..Index(line, ' ')]) == ParentKey, line[Index(line, ' ') + 1..])
  {
    var key := line[..Index(line, ' ')];
    KeysApart(key);
    FieldIf(line, "parent", KeyOf(key) == ParentKey);
  }

  lemma AuthorField(line: string)
    requires Index(line, ' ') < |line|
    ensures Field(line, "author") ==
            If(KeyOf(line[..Index(line, ' ')]) == AuthorKey, line[Index(line, ' ') + 1..])
  {
    var key := line[..Index(line, ' ')];
    KeysApart(key);
    FieldIf(line, "author", KeyOf(key) == AuthorKey);
  }

  lemma CommitterField(line: string)
    requires Index(line, ' ') < |line|
    ensures Field(line, "committer") ==
            If(KeyOf(line[..Index(line, ' ')]) == CommitterKey, line[Index(line, ' ') + 1..])
  {
    var key := line[..Index(line, ' ')];
    KeysApart(key);
    FieldIf(line, "committer", KeyOf(key) == CommitterKey);
  }

  lemma NoField(line: string, key: string)
    requires Index(line, ' ') == |line|
    ensures Field(line, key) == []
  {
    IndexIsFirst(line, ' ');
    assert line[..|line|] == line;
    assert (key + [' '])[|key|] == ' ';
  }

  lemma FieldStored(r: Reading, key: Key, rest: string, now: int64)
    requires ReadField(r, key, rest, now).Value?
    ensures ReadField(r, key, rest, now).value ==
            r.(data := With(r.data, If(key == TreeKey, rest), If(key == ParentKey, rest),
                            If(key == AuthorKey, rest), If(key == CommitterKey, rest), now))
  {
    assert r.data.parents + [] == r.data.parents;
  }

  /** Reading a header line stores its field. */
  lemma LineFilled(r: Reading, line: string, now: int64)
    requires !r.inMessage && line != [] && ReadLine(r, line, now).Value?
    ensures ReadLine(r, line, now).value ==
            r.(data := With(r.data, Field(line, "tree"), Field(line, "parent"),
                            Field(line, "author"), Field(line, "committer"), now))
  {
    var space := Index(line, ' ');
    if space == |line| {
      NoField(line, "tree");
      NoField(line, "parent");
      NoField(line, "author");
      NoField(line, "committer");
      assert r.data.parents + [] == r.data.parents;
    } else {
      TreeField(line);
      ParentField(line);
      AuthorField(line);
      CommitterField(line);
      FieldStored(r, KeyOf(line[..space]), line[space + 1..], now);
    }
  }

  // ------------------------------------------------------------------------ all lines

  /** Storing fields twice is storing them together. */
  lemma WithTwice(d: CommitData, t: seq<string>, p: seq<string>, a: seq<string>, c: seq<string>,
                  t': seq<string>, p': seq<string>, a': seq<string>, c': seq<string>, now: int64)
    ensures With(With(d, t, p, a, c, now), t', p', a', c', now) ==
            With(d, t + t', p + p', a + a', c + c', now)
  {
    assert d.parents + p + p' == d.parents + (p + p');
    AuthorJoin(a, a', d.author, now);
    AuthorJoin(c, c', d.committer, now);
  }

  lemma AuthorJoin(a: seq<string>, b: seq<string>, otherwise: Author, now: int64)
    ensures AuthorOr(a + b, otherwise, now) == AuthorOr(b, AuthorOr(a, otherwise, now), now)
  {
    assert b == [] ==> a + b == a;
  }

  lemma FilledCons(d: CommitData, first: string, rest: seq<string>, now: int64)
    ensures Filled(d, [first] + rest, now) ==
            Filled(With(d, Field(first, "tree"), Field(first, "parent"), Field(first, "author"),
                        Field(first, "committer"), now), rest, now)
  {
    assert ([first] + rest)[1..] == rest;
    WithTwice(d, Field(first, "tree"), Field(first, "parent"), Field(first, "author"),
              Field(first, "committer"), Fields(rest, "tree"), Fields(rest, "parent"),
              Fields(rest, "author"), Fields(rest, "committer"), now);
  }

  lemma HeaderCons(first: string, rest: seq<string>)
    requires first != []
    ensures HeaderOf([first] + rest) == [first] + HeaderOf(rest)
    ensures BodyOf([first] + rest) == BodyOf(rest)
  {
    assert ([first] + rest)[1..] == rest;
  }

  lemma {:induction false} LinesFilled(r: Reading, lines: seq<string>, now: int64)
    requires !r.inMessage && ReadLines(r, lines, now).Value?
    ensures ReadLines(r, lines, now).value.data ==
            Filled(r.data, HeaderOf(lines), now)
              .(message := r.data.message + Lines(BodyOf(lines)))
    decreases |lines|
  {
    if lines == [] {
      NothingFilled(r.data, now);
    } else {
      var first, rest := lines[0], lines[1..];
      assert lines == [first] + rest;
      if first == [] {
        assert HeaderOf(lines) == [] && BodyOf(lines) == rest;
        NothingFilled(r.data, now);
        ReadMessage(r.(inMessage := true), rest, now);
      } else {
        LineFilled(r, first, now);
        HeaderCons(first, rest);
        FilledCons(r.data, first, HeaderOf(rest), now);
        LinesFilled(ReadLine(r, first, now).value, rest, now);
      }
    }
  }

  lemma NothingFilled(d: CommitData, now: int64)
    ensures Filled(d, [], now) == d && d.message + [] == d.message
  {
    assert d.parents + [] == d.parents;
  }

  /** For every text that can be read: the parents are what follows `parent ` on the lines before the
      first empty one, all of them and in order; tree, author and committer are the last ones named
      there; the message is the rest, trimmed. */
  lemma ImportReads(content: string, now: int64)
    requires Import(content, now).Value?
    ensures var lines := Split(content, '\n');
            var header := HeaderOf(lines);
            Import(content, now).value ==
            CommitData(LastOr(Fields(header, "tree"), ""), Fields(header, "parent"),
                       AuthorOr(Fields(header, "author"), NOBODY, now),
                       AuthorOr(Fields(header, "committer"), NOBODY, now),
                       Trim(Lines(BodyOf(lines))))
  {
    var lines := Split(content, '\n');
    LinesFilled(START, lines, now);
    assert [] + Fields(HeaderOf(lines), "parent") == Fields(HeaderOf(lines), "parent");
    assert [] + Lines(BodyOf(lines)) == Lines(BodyOf(lines));
  }

  // ------------------------------------------------------------------------ author lines

  /** The time is the first word of what follows the email; the clock if that is not a number. */
  lemma StampMeans(word: string, rest: string, now: int64)
    requires word != [] && ' ' !in word && !IsSpace(word[0])
    requires rest != [] && !IsSpace(rest[|rest| - 1])
    ensures ParseStamp([' '] + (word + [' '] + rest), now) ==
            match ParseInt(word) case Some(n) => n case None => now
  {
    TrimStamp(word, rest);
    SplitFirst(word, ' ', rest);
  }

  /** A line of at least three words is read as a name, an email in angle brackets and a time; a
      shorter one, or one without both brackets, as nobody at the zero time. */
  lemma AuthorMeans(line: string, now: int64)
    ensures |Split(line, ' ')| < 3 || '<' !in line || '>' !in line ==>
              ParseAuthor(line, now) == Value(Author("", "", -62135596800))
    ensures forall name, email, rest |
              && line == name + ['<'] + email + ['>'] + rest && |Split(line, ' ')| >= 3
              && '<' !in name && '>' !in name && '>' !in email ::
              ParseAuthor(line, now) == Value(Author(Trim(name), email, ParseStamp(rest, now)))
  {
    NotFound(line, '<');
    NotFound(line, '>');
    forall name, email, rest |
      && line == name + ['<'] + email + ['>'] + rest && |Split(line, ' ')| >= 3
      && '<' !in name && '>' !in name && '>' !in email
      ensures ParseAuthor(line, now) == Value(Author(Trim(name), email, ParseStamp(rest, now)))
    {
      Bracketed(line, name, email, rest, now);
    }
  }

  lemma NotFound(s: string, c: char)
    ensures Index(s, c) == |s| <==> c !in s
  {
    IndexIsFirst(s, c);
    assert s[..|s|] == s;
  }

  lemma Bracketed(line: string, name: string, email: string, rest: string, now: int64)
    requires line == name + ['<'] + email + ['>'] + rest && |Split(line, ' ')| >= 3
    requires '<' !in name && '>' !in name && '>' !in email
    ensures ParseAuthor(line, now) == Value(Author(Trim(name), email, ParseStamp(rest, now)))
  {
    var start, end := |name|, |name| + 1 + |email|;
    assert line == name + ['<'] + (email + ['>'] + rest);
    IndexAfter(name, '<', email + ['>'] + rest);
    assert '>' !in name + ['<'] + email;
    IndexAfter(name + ['<'] + email, '>', rest);
    assert line[..start] == name && line[start + 1..end] == email && line[end + 1..] == rest;
    ParseFound(line, start, end, now);
  }

  // ------------------------------------------------------------------------ merge commits

  function ParentLines(key: string, parents: seq<string>): seq<string> {
    if parents == [] then [] else [Keyed(key, parents[0])] + ParentLines(key, parents[1..])
  }

  /** The header of a commit with any number of parents and a committer of its own. */
  function FullHeader(tree: string, parents: seq<string>, a: Author, b: Author): seq<string> {
    [Keyed("tree", tree)] + ParentLines("parent", parents)
    + ([Keyed("author", Signature(a))] + [Keyed("committer", Signature(b))])
  }

  function Full(tree: string, parents: seq<string>, a: Author, b: Author, message: string): string {
    Lines(FullHeader(tree, parents, a, b) + [[]]) + message
  }

  lemma KeyedField(k: string, rest: string, key: string)
    requires ' ' !in k && ' ' !in key
    ensures Fields([Keyed(k, rest)], key) == If(k == key, rest)
  {
    var line := Keyed(k, rest);
    IndexAfter(k, ' ', rest);
    assert line[..|k|] == k && line[|k| + 1..] == rest;
    FieldByKey(line, key);
    assert Fields([line][1..], key) == [];
  }

  lemma {:induction false} FieldsJoin(a: seq<string>, b: seq<string>, key: string)
    ensures Fields(a + b, key) == Fields(a, key) + Fields(b, key)
  {
    if a == [] {
      assert a + b == b;
    } else {
      FieldsJoin(a[1..], b, key);
      assert (a + b)[1..] == a[1..] + b;
      JoinedFields(Field(a[0], key), Fields(a[1..], key), Fields(b, key));
    }
  }

  lemma JoinedFields(a: seq<string>, b: seq<string>, c: seq<string>)
    ensures a + b + c == a + (b + c)
  {
  }

  lemma {:induction false} ParentFields(k: string, parents: seq<string>, key: string)
    requires ' ' !in k && ' ' !in key
    ensures Fields(ParentLines(k, parents), key) == if k == key then parents else []
  {
    if parents != [] {
      var line, rest := Keyed(k, parents[0]), ParentLines(k, parents[1..]);
      KeyedField(k, parents[0], key);
      ParentFields(k, parents[1..], key);
      FieldsJoin([line], rest, key);
    }
  }

  lemma FieldsOfFour(a: seq<string>, b: seq<string>, c: seq<string>, d: seq<string>, key: string)
    ensures Fields(a + b + (c + d), key) ==
            Fields(a, key) + Fields(b, key) + (Fields(c, key) + Fields(d, key))
  {
    FieldsJoin(a, b, key);
    FieldsJoin(c, d, key);
    FieldsJoin(a + b, c + d, key);
  }

  /** The fields of a header made of a tree line, parent lines and two author lines. */
  lemma HeaderFields(t: string, tree: string, p: string, parents: seq<string>, k: string, a: string,
                     l: string, b: string, key: string)
    requires ' ' !in t && ' ' !in p && ' ' !in k && ' ' !in l && ' ' !in key
    ensures Fields([Keyed(t, tree)] + ParentLines(p, parents) + ([Keyed(k, a)] + [Keyed(l, b)]), key)
            == If(t == key, tree) + (if p == key then parents else [])
               + (If(k == key, a) + If(l == key, b))
  {
    KeyedField(t, tree, key);
    ParentFields(p, parents, key);
    KeyedField(k, a, key);
    KeyedField(l, b, key);
    FieldsOfFour([Keyed(t, tree)], ParentLines(p, parents), [Keyed(k, a)], [Keyed(l, b)], key);
  }

  lemma FullFields(tree: string, parents: seq<string>, a: Author, b: Author)
    ensures var header := FullHeader(tree, parents, a, b);
            && Fields(header, "tree") == [tree] && Fields(header, "parent") == parents
            && Fields(header, "author") == [Signature(a)]
            && Fields(header, "committer") == [Signature(b)]
  {
    var s, s' := Signature(a), Signature(b);
    HeaderFields("tree", tree, "parent", parents, "author", s, "committer", s', "tree");
    HeaderFields("tree", tree, "parent", parents, "author", s, "committer", s', "parent");
    HeaderFields("tree", tree, "parent", parents, "author", s, "committer", s', "author");
    HeaderFields("tree", tree, "parent", parents, "author", s, "committer", s', "committer");
  }

  /** Neither empty nor cut by a line end, and no author in it that cannot be read. */
  predicate PlainLine(line: string) {
    line != [] && '\n' !in line && !BadLine(line)
  }

  lemma PlainKeyed(key: string, rest: string)
    requires ' ' !in key && '\n' !in key && '\n' !in rest
    requires KeyOf(key) == AuthorKey || KeyOf(key) == CommitterKey ==> !Crossed(rest)
    ensures PlainLine(Keyed(key, rest))
  {
    KeyedOneLine(key, rest);
    BadKeyed(key, rest);
  }

  lemma {:induction false} PlainParents(key: string, parents: seq<string>)
    requires ' ' !in key && '\n' !in key && KeyOf(key) == ParentKey
    requires forall p | p in parents :: '\n' !in p
    ensures forall line | line in ParentLines(key, parents) :: PlainLine(line)
  {
    if parents != [] {
      PlainKeyed(key, parents[0]);
      PlainParents(key, parents[1..]);
    }
  }

  lemma PlainAuthor(key: string, a: Author)
    requires ' ' !in key && '\n' !in key && Readable(a)
    ensures PlainLine(Keyed(key, Signature(a)))
  {
    SignatureOneLine(a);
    CrossedSignature(a);
    IndexIsFirst(a.name, '>');
    IndexIsFirst(a.name, '<');
    PlainKeyed(key, Signature(a));
  }

  lemma PlainHeader(tree: string, parents: seq<string>, a: Author, b: Author)
    requires '\n' !in tree && (forall p | p in parents :: '\n' !in p) && Readable(a) && Readable(b)
    ensures forall line | line in FullHeader(tree, parents, a, b) :: PlainLine(line)
  {
    PlainKeyed("tree", tree);
    PlainParents("parent", parents);
    PlainAuthor("author", a);
    PlainAuthor("committer", b);
  }

  lemma PlainSplit(header: seq<string>, rest: seq<string>)
    requires forall line | line in header :: PlainLine(line)
    ensures var lines := header + [[]] + rest;
            HeaderOf(lines) == header && BodyOf(lines) == rest && !BadHeader(lines)
  {
    var lines := header + [[]] + rest;
    assert forall line | line in header :: line != [];
    IndexAfter(header, [], rest);
    assert lines[..|header|] == header && lines[|header| + 1..] == rest;
    forall i | 0 <= i < |lines| ensures !BadLine(lines[i]) || [] in lines[..i] {
      if i < |header| {
        assert lines[i] == header[i] && header[i] in header;
      } else if i > |header| {
        assert lines[..i][|header|] == [];
      }
    }
  }

  /** A text that starts with plain lines and an empty one. */
  lemma PlainText(header: seq<string>, message: string, now: int64)
    requires forall line | line in header :: PlainLine(line)
    ensures var content := Lines(header + [[]]) + message;
            var lines := Split(content, '\n');
            && HeaderOf(lines) == header && BodyOf(lines) == Split(message, '\n')
            && Import(content, now).Value?
  {
    SplitLines(header + [[]], message);
    PlainSplit(header, Split(message, '\n'));
    ImportPanicsIff(Lines(header + [[]]) + message, now);
  }

  lemma TrimLines(message: string)
    ensures Trim(Lines(Split(message, '\n'))) == Trim(message)
  {
    LinesOfSplit(message);
    TrimTrailing(message, '\n');
  }

  /** A commit with any parents, an author and a committer is read back, whatever the message is, if
      and only if tree and parents hold no line end and both authors are readable. */
  lemma FullRoundTripIff(tree: string, parents: seq<string>, a: Author, b: Author, message: string,
                         now: int64)
    ensures Import(Full(tree, parents, a, b, message), now) ==
            Value(CommitData(tree, parents, a, b, Trim(message)))
            <==> '\n' !in tree && (forall p | p in parents :: '\n' !in p)
                 && Readable(a) && Readable(b)
  {
    var content := Full(tree, parents, a, b, message);
    if '\n' !in tree && (forall p | p in parents :: '\n' !in p) && Readable(a) && Readable(b) {
      PlainHeader(tree, parents, a, b);
      PlainText(FullHeader(tree, parents, a, b), message, now);
      ImportReads(content, now);
      FullFields(tree, parents, a, b);
      ParseSignature(a, now);
      ParseSignature(b, now);
      TrimLines(message);
    } else {
      ImportSound(content, now);
    }
  }

  /** The whole text of an exported commit, which ends in a line end that is added if need be. */
  lemma ExportedText(tree: string, a: Author, message: string)
    ensures var who := a.name + " <" + a.email + "> " + Decimal.Show(a.seconds) + " +0000";
            Exported(tree, a, message) ==
            "tree" + " " + tree + "\n" + "author" + " " + who + "\n" + "committer" + " " + who + "\n\n"
            + if message != [] && message[|message| - 1] == '\n' then message else message + "\n"
  {
    var who := a.name + " <" + a.email + "> " + Decimal.Show(a.seconds) + " +0000";
    WhoSigns(a, Decimal.Show(a.seconds));
    HeaderText("tree", tree, "author", who, "committer");
  }

  lemma WhoSigns(a: Author, shown: string)
    ensures a.name + " <" + a.email + "> " + shown + " +0000" ==
            a.name + [' ', '<'] + a.email + ['>'] + ([' '] + shown + ZONE)
  {
  }

  lemma HeaderText(t: string, tree: string, k: string, who: string, l: string)
    ensures Lines([Keyed(t, tree), Keyed(k, who), Keyed(l, who), []]) ==
            t + " " + tree + "\n" + k + " " + who + "\n" + l + " " + who + "\n\n"
  {
    var x, y, z := Keyed(t, tree), Keyed(k, who), Keyed(l, who);
    LinesSnoc([], x);
    LinesSnoc([x], y);
    LinesSnoc([x, y], z);
    LinesSnoc([x, y, z], []);
    assert [] + [x] == [x] && [x] + [y] == [x, y] && [x, y] + [z] == [x, y, z];
    assert [x, y, z] + [[]] == [x, y, z, []];
  }
}
